/**
 * The recursive construction of the dependency graph shared by bulk builds and the cycle check
 * (`_add_deps_graph`).
 */
module DepGraph {
  import opened Graphs
  import opened Templates

  /** The values of the sets, the graph and the failure flag at one moment. */
  datatype Snap = Snap(pvisit: set<Name>, cbvisit: Option<set<Name>>,
                       nodes: set<Name>, edges: set<(Name, Name)>,
                       failed: bool, trace: seq<Event>)

  /** Edges between unvisited names, out of readable templates. */
  ghost function FreshEdges(view: View, visited: set<Name>): set<(Name, Name)> {
    set x, d | x in view.Keys && x !in visited && d in Deps(view, x) && d !in visited :: (x, d)
  }

  /** `x` is reached from `roots` through names that were not visited, all but `x` itself readable. */
  ghost predicate Fresh(view: View, visited: set<Name>, roots: seq<Name>, x: Name) {
    exists r :: r in roots && r !in visited && (r == x || Reach(FreshEdges(view, visited), r, x))
  }

  /** `added` went into the optional second set, if there is one. */
  ghost predicate Noted(cb0: Option<set<Name>>, added: set<Name>, cb1: Option<set<Name>>) {
    && cb0.Some? == cb1.Some?
    && (cb0.Some? ==> cb1.value == cb0.value + added)
  }

  lemma AsSetConcat(r1: seq<Name>, r2: seq<Name>)
    ensures AsSet(r1 + r2) == AsSet(r1) + AsSet(r2)
  {
  }

  /** `depg.add(n, *deps)`. */
  ghost function Register(s: Snap, n: Name, deps: seq<Name>): Snap {
    s.(nodes := s.nodes + {n} + AsSet(deps), edges := s.edges + EdgesOf(n, deps))
  }

  /** The visited set after visiting `roots` one after the other: complete and justified. */
  ghost predicate ExploresNames(view: View, v0: set<Name>, roots: seq<Name>, v1: set<Name>) {
    && v0 <= v1
    && AsSet(roots) <= v1
    && Listed(view, v1 - v0) <= v1
    && forall x :: x in v1 - v0 ==> Fresh(view, v0, roots, x)
  }

  /** The graph and the second set after newly visiting `found`. */
  ghost predicate ExploresGraph(view: View, s0: Snap, roots: seq<Name>, found: set<Name>, s1: Snap) {
    && s1.edges == s0.edges + DepEdges(view, found)
    && s1.nodes == s0.nodes + GoodIn(view, found) + Listed(view, found)
    && Noted(s0.cbvisit, AsSet(roots) + Listed(view, found), s1.cbvisit)
  }

  /** The failure flag and the trace after newly visiting `found`. */
  ghost predicate ExploresErrors(view: View, s0: Snap, found: set<Name>, s1: Snap) {
    && s1.failed == (s0.failed || AnyRaised(view, found))
    && OnlyFaults(view, s0.trace, s1.trace)
    && (forall x :: Fault(x) in s1.trace[|s0.trace|..] <==> x in found && Read(view, x).Raised?)
  }

  /** There are new errors exactly if something that could not be read was found. */
  lemma ErrorsCounted(view: View, s0: Snap, found: set<Name>, s1: Snap)
    requires ExploresErrors(view, s0, found, s1)
    ensures |s1.trace| > |s0.trace| <==> AnyRaised(view, found)
  {
    var added := s1.trace[|s0.trace|..];
    if |s1.trace| > |s0.trace| {
      assert added[0] == s1.trace[|s0.trace|] && added[0] == Fault(added[0].name) && added[0] in added;
    }
    if AnyRaised(view, found) {
      var x :| x in found && Read(view, x).Raised?;
      assert Fault(x) in added;
    }
  }

  /** The whole effect of visiting `roots` one after the other. */
  ghost predicate Explores(view: View, s0: Snap, roots: seq<Name>, s1: Snap) {
    && ExploresNames(view, s0.pvisit, roots, s1.pvisit)
    && ExploresGraph(view, s0, roots, s1.pvisit - s0.pvisit, s1)
    && ExploresErrors(view, s0, s1.pvisit - s0.pvisit, s1)
  }

  lemma FreshGrows(view: View, V: set<Name>, W: set<Name>, roots: seq<Name>, all: seq<Name>, x: Name)
    requires V <= W && Fresh(view, W, roots, x)
    requires AsSet(roots) <= AsSet(all)
    ensures Fresh(view, V, all, x)
  {
    var r :| r in roots && r !in W && (r == x || Reach(FreshEdges(view, W), r, x));
    assert r in AsSet(roots);
    if r != x {
      MonotoneReach(FreshEdges(view, W), FreshEdges(view, V), r, x);
    }
  }

  lemma ExploresNothing(view: View, s: Snap)
    ensures Explores(view, s, [], s)
  {
    assert s.pvisit - s.pvisit == {};
  }

  lemma ComposeNames(view: View, v0: set<Name>, r1: seq<Name>, v1: set<Name>, r2: seq<Name>, v2: set<Name>)
    requires ExploresNames(view, v0, r1, v1) && ExploresNames(view, v1, r2, v2)
    ensures ExploresNames(view, v0, r1 + r2, v2)
    ensures v2 - v0 == (v1 - v0) + (v2 - v1)
  {
    assert v2 - v0 == (v1 - v0) + (v2 - v1);
    DepEdgesUnion(view, v1 - v0, v2 - v1);
    AsSetConcat(r1, r2);
    forall x | x in v2 - v0 ensures Fresh(view, v0, r1 + r2, x) {
      if x in v1 {
        FreshGrows(view, v0, v0, r1, r1 + r2, x);
      } else {
        FreshGrows(view, v0, v1, r2, r1 + r2, x);
      }
    }
  }

  lemma ComposeGraph(view: View, s0: Snap, r1: seq<Name>, A: set<Name>, s1: Snap, r2: seq<Name>, B: set<Name>, s2: Snap)
    requires ExploresGraph(view, s0, r1, A, s1) && ExploresGraph(view, s1, r2, B, s2)
    ensures ExploresGraph(view, s0, r1 + r2, A + B, s2)
  {
    DepEdgesUnion(view, A, B);
    AsSetConcat(r1, r2);
    UnionAssoc(s0.edges, DepEdges(view, A), DepEdges(view, B));
    UnionRounds(s0.nodes, GoodIn(view, A), Listed(view, A), GoodIn(view, B), Listed(view, B));
    if s0.cbvisit.Some? {
      UnionRounds(s0.cbvisit.value, AsSet(r1), Listed(view, A), AsSet(r2), Listed(view, B));
    }
  }

  lemma ComposeErrors(view: View, s0: Snap, A: set<Name>, s1: Snap, B: set<Name>, s2: Snap)
    requires ExploresErrors(view, s0, A, s1) && ExploresErrors(view, s1, B, s2)
    ensures ExploresErrors(view, s0, A + B, s2)
  {
    RaisedUnion(view, A, B);
    assert s2.trace[|s0.trace|..] == s1.trace[|s0.trace|..] + s2.trace[|s1.trace|..];
  }

  /** Visiting `r1` and then `r2` is visiting `r1 + r2`. */
  lemma Compose(view: View, s0: Snap, r1: seq<Name>, s1: Snap, r2: seq<Name>, s2: Snap)
    requires Explores(view, s0, r1, s1) && Explores(view, s1, r2, s2)
    ensures Explores(view, s0, r1 + r2, s2)
    ensures s2.pvisit - s0.pvisit == (s1.pvisit - s0.pvisit) + (s2.pvisit - s1.pvisit)
  {
    var A, B := s1.pvisit - s0.pvisit, s2.pvisit - s1.pvisit;
    ComposeNames(view, s0.pvisit, r1, s1.pvisit, r2, s2.pvisit);
    ComposeGraph(view, s0, r1, A, s1, r2, B, s2);
    ComposeErrors(view, s0, A, s1, B, s2);
  }

  /** What is found below a newly read name is found from that name. */
  lemma FreshBelow(view: View, v0: set<Name>, d: Name, x: Name)
    requires d !in v0 && Fresh(view, v0 + {d}, Deps(view, d), x)
    ensures Fresh(view, v0, [d], x)
  {
    var W := v0 + {d};
    var r :| r in Deps(view, d) && r !in W && (r == x || Reach(FreshEdges(view, W), r, x));
    assert d in [d];
    assert (d, r) in FreshEdges(view, v0);
    ReachEdge(FreshEdges(view, v0), d, r);
    if r != x {
      MonotoneReach(FreshEdges(view, W), FreshEdges(view, v0), r, x);
      ReachTrans(FreshEdges(view, v0), d, r, x);
    }
  }

  lemma DescendNames(view: View, v0: set<Name>, d: Name, v1: set<Name>)
    requires d !in v0 && Good(view, d) && ExploresNames(view, v0 + {d}, Deps(view, d), v1)
    ensures ExploresNames(view, v0, [d], v1)
    ensures v1 - v0 == {d} + (v1 - (v0 + {d}))
  {
    var W := v0 + {d};
    assert v1 - v0 == {d} + (v1 - W);
    DepEdgesUnion(view, {d}, v1 - W);
    SingleTemplate(view, d);
    assert d in [d];
    assert Fresh(view, v0, [d], d);
    forall x | x in v1 - W ensures Fresh(view, v0, [d], x) {
      FreshBelow(view, v0, d, x);
    }
  }

  lemma DescendGraph(view: View, s0: Snap, d: Name, cb: Option<set<Name>>, found: set<Name>, s1: Snap)
    requires Good(view, d) && Noted(s0.cbvisit, {d}, cb)
    requires ExploresGraph(view, Register(s0.(cbvisit := cb), d, Deps(view, d)), Deps(view, d), found, s1)
    ensures ExploresGraph(view, s0, [d], {d} + found, s1)
  {
    DepEdgesUnion(view, {d}, found);
    SingleTemplate(view, d);
    assert AsSet([d]) == {d};
  }

  /** Reading a new name and then visiting what it lists is visiting that name. */
  lemma Descend(view: View, s0: Snap, d: Name, cb: Option<set<Name>>, s1: Snap)
    requires d !in s0.pvisit && Good(view, d) && Noted(s0.cbvisit, {d}, cb)
    requires Explores(view, Register(s0.(pvisit := s0.pvisit + {d}, cbvisit := cb), d, Deps(view, d)),
                      Deps(view, d), s1)
    ensures Explores(view, s0, [d], s1)
    ensures AllGood(view, s1.pvisit - s0.pvisit) <==> AllGood(view, s1.pvisit - (s0.pvisit + {d}))
  {
    hide ExploresNames;
    var found := s1.pvisit - (s0.pvisit + {d});
    DescendNames(view, s0.pvisit, d, s1.pvisit);
    DescendGraph(view, s0, d, cb, found, s1);
    RaisedUnion(view, {d}, found);
    SingleTemplate(view, d);
  }

  /** A name visited before adds nothing but its mention. */
  lemma SeenBefore(view: View, s0: Snap, d: Name, s1: Snap)
    requires d in s0.pvisit && Noted(s0.cbvisit, {d}, s1.cbvisit)
    requires s1 == s0.(cbvisit := s1.cbvisit)
    ensures Explores(view, s0, [d], s1)
  {
    assert s1.pvisit - s0.pvisit == {};
    assert AsSet([d]) == {d};
  }

  /** A new name that cannot be read is a dead end. */
  lemma DeadEnd(view: View, s0: Snap, d: Name, s1: Snap)
    requires d !in s0.pvisit && !Good(view, d) && Noted(s0.cbvisit, {d}, s1.cbvisit)
    requires s1.pvisit == s0.pvisit + {d} && s1.nodes == s0.nodes && s1.edges == s0.edges
    requires s1.failed == (s0.failed || Read(view, d).Raised?)
    requires s1.trace == s0.trace + if Read(view, d).Raised? then [Fault(d)] else []
    ensures Explores(view, s0, [d], s1)
    ensures s1.pvisit - s0.pvisit == {d}
  {
    assert s1.pvisit - s0.pvisit == {d};
    assert AsSet([d]) == {d};
    assert d in [d];
    assert Fresh(view, s0.pvisit, [d], d);
  }

  lemma NamesExactly(view: View, v0: set<Name>, roots: seq<Name>, v1: set<Name>)
    requires ExploresNames(view, v0, roots, v1)
    ensures forall x :: x in v1 - v0 <==> Fresh(view, v0, roots, x)
  {
    var found := v1 - v0;
    forall x | Fresh(view, v0, roots, x) ensures x in found {
      var E := FreshEdges(view, v0);
      var r :| r in roots && r !in v0 && (r == x || Reach(E, r, x));
      assert r in AsSet(roots);
      forall a, b | (a, b) in E && a in found ensures b in found {
        assert b in Listed(view, found);
      }
      if r != x {
        ClosedReach(E, found, r, x);
      }
    }
  }

  /** A traversal newly visits exactly the names reached through names not visited before. */
  lemma ExploresExactly(view: View, s0: Snap, roots: seq<Name>, s1: Snap)
    requires Explores(view, s0, roots, s1)
    ensures forall x :: x in s1.pvisit - s0.pvisit <==> Fresh(view, s0.pvisit, roots, x)
  {
    NamesExactly(view, s0.pvisit, roots, s1.pvisit);
  }

  // ---- The names found, as a function of where the search starts ----

  ghost predicate NewFrom(view: View, V: set<Name>, R: set<Name>, x: Name) {
    exists r :: r in R && r !in V && (r == x || Reach(FreshEdges(view, V), r, x))
  }

  /** Everything reached from `R` through names outside `V`. */
  ghost function Newly(view: View, V: set<Name>, R: set<Name>): set<Name> {
    set x | x in R + Listed(view, view.Keys) && NewFrom(view, V, R, x)
  }

  lemma NewlyExactly(view: View, V: set<Name>, R: set<Name>)
    ensures forall x :: x in Newly(view, V, R) <==> NewFrom(view, V, R, x)
  {
    var E := FreshEdges(view, V);
    forall x | NewFrom(view, V, R, x) ensures x in Newly(view, V, R) {
      var r :| r in R && r !in V && (r == x || Reach(E, r, x));
      if r != x {
        ClosedReach(E, Listed(view, view.Keys), r, x);
      }
    }
  }

  /** Following a list is following its names. */
  lemma NewlyIsFresh(view: View, V: set<Name>, roots: seq<Name>)
    ensures forall x :: x in Newly(view, V, AsSet(roots)) <==> Fresh(view, V, roots, x)
  {
    NewlyExactly(view, V, AsSet(roots));
  }

  /** What is found is new, and so is what it leads to. */
  lemma NewlyClosed(view: View, V: set<Name>, R: set<Name>)
    ensures Newly(view, V, R) !! V && R - V <= Newly(view, V, R)
    ensures Listed(view, Newly(view, V, R)) <= V + Newly(view, V, R)
  {
    var E, N := FreshEdges(view, V), Newly(view, V, R);
    NewlyExactly(view, V, R);
    forall x | x in N ensures x !in V {
      var r :| r in R && r !in V && (r == x || Reach(E, r, x));
      if r != x {
        ClosedReach(E, Listed(view, view.Keys) - V, r, x);
      }
    }
    forall a, b | a in N && b in Deps(view, a) && b !in V ensures b in N {
      var r :| r in R && r !in V && (r == a || Reach(E, r, a));
      assert (a, b) in E;
      ReachEdge(E, a, b);
      if r != a {
        ReachTrans(E, r, a, b);
      }
    }
  }

  /** Any set with the starts that no new edge leaves holds everything found. */
  lemma NewlyLeast(view: View, V: set<Name>, R: set<Name>, S: set<Name>)
    requires R - V <= S && Closed(FreshEdges(view, V), S)
    ensures Newly(view, V, R) <= S
  {
    forall x | x in Newly(view, V, R) ensures x in S {
      var r :| r in R && r !in V && (r == x || Reach(FreshEdges(view, V), r, x));
      if r != x {
        ClosedReach(FreshEdges(view, V), S, r, x);
      }
    }
  }

  /** Searching on from further names finds what one search from all of them finds. */
  lemma NewlyStep(view: View, V: set<Name>, R1: set<Name>, R2: set<Name>)
    ensures Newly(view, V, R1 + R2) == Newly(view, V, R1) + Newly(view, V + Newly(view, V, R1), R2)
  {
    var N1 := Newly(view, V, R1);
    var W := V + N1;
    var N2 := Newly(view, W, R2);
    NewlyExactly(view, V, R1 + R2);
    NewlyClosed(view, V, R1);
    NewlyClosed(view, W, R2);
    forall a, b | (a, b) in FreshEdges(view, V) && a in N1 + N2 ensures b in N1 + N2 {
      if a in N1 {
        assert b in Listed(view, N1);
      } else {
        assert b in Listed(view, N2);
      }
    }
    NewlyLeast(view, V, R1 + R2, N1 + N2);
    forall x | x in N1 + N2 ensures NewFrom(view, V, R1 + R2, x) {
      if x in N1 {
        assert NewFrom(view, V, R1, x);
      } else {
        assert NewFrom(view, W, R2, x);
        var r :| r in R2 && r !in W && (r == x || Reach(FreshEdges(view, W), r, x));
        if r != x {
          MonotoneReach(FreshEdges(view, W), FreshEdges(view, V), r, x);
        }
      }
    }
  }

  /** Every dependency edge of every readable template. */
  ghost function AllEdges(view: View): set<(Name, Name)> {
    DepEdges(view, view.Keys)
  }

  /** `x` is one of the templates or behind one of them. */
  ghost predicate Behind(view: View, roots: seq<Name>, x: Name) {
    x in roots || exists r :: r in roots && Reach(AllEdges(view), r, x)
  }

  lemma FreshIsBehind(view: View, V: set<Name>, t: Name, x: Name)
    requires Fresh(view, V, Deps(view, t), x)
    ensures Reach(AllEdges(view), t, x)
  {
    var r :| r in Deps(view, t) && r !in V && (r == x || Reach(FreshEdges(view, V), r, x));
    ReachEdge(AllEdges(view), t, r);
    if r != x {
      MonotoneReach(FreshEdges(view, V), AllEdges(view), r, x);
      ReachTrans(AllEdges(view), t, r, x);
    }
  }

  /** Whatever a traversal finds is behind its starting names. */
  lemma FoundIsBehind(view: View, v0: set<Name>, roots: seq<Name>, v1: set<Name>)
    requires ExploresNames(view, v0, roots, v1)
    ensures forall x :: x in v1 - v0 ==> Behind(view, roots, x)
  {
    forall x | x in v1 - v0 ensures Behind(view, roots, x) {
      FreshAmong(view, v0, roots, x);
    }
  }

  lemma FreshAmong(view: View, V: set<Name>, roots: seq<Name>, x: Name)
    requires Fresh(view, V, roots, x)
    ensures Behind(view, roots, x)
  {
    var r :| r in roots && r !in V && (r == x || Reach(FreshEdges(view, V), r, x));
    if r != x {
      MonotoneReach(FreshEdges(view, V), AllEdges(view), r, x);
    }
  }

  /** The mutable state shared by the recursive calls. */
  class GraphWalk {
    const view: View
    var pvisit: set<Name>
    var cbvisit: Option<set<Name>>
    var nodes: set<Name>
    var edges: set<(Name, Name)>
    var failed: bool
    ghost var trace: seq<Event>

    constructor (view: View, cbvisit: Option<set<Name>>)
      ensures this.view == view
      ensures Now() == Snap({}, cbvisit, {}, {}, false, [])
    {
      this.view := view;
      this.cbvisit := cbvisit;
      pvisit, nodes, edges, failed, trace := {}, {}, {}, false, [];
    }

    ghost function Now(): Snap
      reads this
    {
      Snap(pvisit, cbvisit, nodes, edges, failed, trace)
    }

    /** The sets and the graph alone. */
    ghost function Shape(): Snap
      reads this`pvisit, this`cbvisit, this`nodes, this`edges
    {
      Snap(pvisit, cbvisit, nodes, edges, false, [])
    }

    /** Adds one node and its dependencies to the graph. */
    method Add(n: Name, deps: seq<Name>)
      modifies this`nodes, this`edges
      ensures Now() == Register(old(Now()), n, deps)
    {
      nodes := nodes + {n} + set d | d in deps;
      edges := edges + EdgesOf(n, deps);
    }

    /** Reads a template in dependency mode; an error raises the failure flag. */
    method ReadDep(d: Name) returns (p: Parse)
      modifies this`failed, this`trace
      ensures p == Read(view, d)
      ensures failed == (old(failed) || p.Raised?)
      ensures trace == old(trace) + if p.Raised? then [Fault(d)] else []
    {
      p := Read(view, d);
      if p.Raised? {
        failed := true;
        trace := trace + [Fault(d)];
      }
    }

    /** One turn of the loop of `_add_deps_graph`. */
    method Visit(d: Name) returns (succ: bool)
      modifies this
      ensures Explores(view, old(Now()), [d], Now())
      ensures succ <==> AllGood(view, pvisit - old(pvisit))
      decreases view.Keys - pvisit, 0
    {
      hide ExploresNames;
      hide ExploresGraph;
      hide ExploresErrors;
      ghost var s := Now();
      if cbvisit.Some? {
        cbvisit := Some(cbvisit.value + {d});
      }
      if d in pvisit {
        SeenBefore(view, s, d, Now());
        return true;
      }
      pvisit := pvisit + {d};
      ghost var cb := cbvisit;
      var p := ReadDep(d);
      if p.Parsed? {
        assert Now() == s.(pvisit := s.pvisit + {d}, cbvisit := cb);
        succ := AddDepsGraph(d, p.deps);
        Descend(view, s, d, cb, Now());
      } else {
        DeadEnd(view, s, d, Now());
        succ := false;
      }
    }

    /** Adds `pn` with its dependencies `bdl`, and everything behind them that was not visited yet. */
    method AddDepsGraph(pn: Name, bdl: seq<Name>) returns (succ: bool)
      modifies this
      ensures Explores(view, Register(old(Now()), pn, bdl), bdl, Now())
      ensures forall x :: x in pvisit - old(pvisit) <==> Fresh(view, old(pvisit), bdl, x)
      ensures succ <==> AllGood(view, pvisit - old(pvisit))
      decreases view.Keys - pvisit, 1, |bdl|
    {
      hide ExploresGraph;
      hide ExploresErrors;
      Add(pn, bdl);
      ghost var s := Now();
      succ := true;
      ExploresNothing(view, s);
      for i := 0 to |bdl|
        invariant Explores(view, s, bdl[..i], Now())
        invariant succ <==> AllGood(view, pvisit - old(pvisit))
      {
        ghost var s1 := Now();
        var ok := Visit(bdl[i]);
        if !ok {
          succ := false;
        }
        assert bdl[..i + 1] == bdl[..i] + [bdl[i]];
        Compose(view, s, bdl[..i], s1, [bdl[i]], Now());
        RaisedUnion(view, s1.pvisit - s.pvisit, pvisit - s1.pvisit);
      }
      assert bdl[..|bdl|] == bdl;
      ExploresExactly(view, s, bdl, Now());
    }
  }
}
