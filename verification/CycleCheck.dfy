/** The dependency cycle check over one template or the whole tree (`_graph_prepare`, `do_cycle_check`). */
module CycleCheck {
  import opened Graphs
  import opened Templates
  import opened TopoSort
  import opened DepGraph

  /** What the scan has established once `roots` are done: `covered` names are expanded. */
  ghost predicate Scanned(view: View, roots: seq<Name>, s: Snap) {
    var covered := AsSet(roots) + s.pvisit;
    && s.edges == DepEdges(view, covered)
    && s.nodes == GoodIn(view, covered) + Listed(view, covered)
    && Listed(view, covered) <= s.pvisit
    && (forall x :: x in s.pvisit ==> Behind(view, roots, x))
  }

  lemma BehindGrows(view: View, r1: seq<Name>, r2: seq<Name>)
    ensures forall x :: Behind(view, r1, x) ==> Behind(view, r1 + r2, x)
  {
    forall x | Behind(view, r1, x) ensures Behind(view, r1 + r2, x) {
      if x !in r1 {
        var r :| r in r1 && Reach(AllEdges(view), r, x);
        assert r in r1 + r2;
      }
    }
  }

  /** A template that is covered already, or cannot be read, changes nothing. */
  lemma ScanSkip(view: View, roots: seq<Name>, t: Name, s: Snap)
    requires Scanned(view, roots, s) && (t in s.pvisit || !Good(view, t))
    ensures Scanned(view, roots + [t], s)
  {
    var covered := AsSet(roots) + s.pvisit;
    DepEdgesUnion(view, covered, {t});
    DepEdgesUnion(view, covered - {t}, {t});
    assert AsSet(roots + [t]) + s.pvisit == covered + {t};
    if t in covered {
      assert covered + {t} == covered;
    } else {
      SingleTemplate(view, t);
    }
    BehindGrows(view, roots, [t]);
  }

  lemma RegroupNodes(good: set<Name>, listed: set<Name>, t: Name, deps: set<Name>, g: set<Name>, l: set<Name>)
    ensures good + listed + {t} + deps + g + l == (good + {t} + g) + (listed + deps + l)
  {
  }

  lemma ExpandIsSound(view: View, roots: seq<Name>, t: Name, s0: Snap, s1: Snap)
    requires forall x :: x in s0.pvisit ==> Behind(view, roots, x)
    requires Explores(view, Register(s0, t, Deps(view, t)), Deps(view, t), s1)
    ensures forall x :: x in s1.pvisit ==> Behind(view, roots + [t], x)
  {
    BehindGrows(view, roots, [t]);
    assert t in roots + [t];
    forall x | x in s1.pvisit - s0.pvisit ensures Behind(view, roots + [t], x) {
      FreshIsBehind(view, s0.pvisit, t, x);
    }
  }

  /** The graph after expanding a further template and newly finding `found`. */
  lemma ScanGraph(view: View, covered: set<Name>, t: Name, found: set<Name>, s0: Snap, s1: Snap)
    requires s0.edges == DepEdges(view, covered) && s0.nodes == GoodIn(view, covered) + Listed(view, covered)
    requires Good(view, t) && ExploresGraph(view, Register(s0, t, Deps(view, t)), Deps(view, t), found, s1)
    ensures var all := covered + {t} + found;
            s1.edges == DepEdges(view, all) && s1.nodes == GoodIn(view, all) + Listed(view, all)
  {
    hide DepEdges;
    hide GoodIn;
    hide Listed;
    hide EdgesOf;
    DepEdgesUnion(view, covered, {t});
    DepEdgesUnion(view, covered + {t}, found);
    RegroupNodes(GoodIn(view, covered), Listed(view, covered), t, AsSet(Deps(view, t)), GoodIn(view, found),
                 Listed(view, found));
    SingleTemplate(view, t);
  }

  /** Everything listed so far was visited. */
  lemma ScanVisits(view: View, covered: set<Name>, t: Name, v0: set<Name>, v1: set<Name>)
    requires Listed(view, covered) <= v0 && ExploresNames(view, v0, Deps(view, t), v1)
    ensures Listed(view, covered + {t} + (v1 - v0)) <= v1
  {
    hide Listed;
    hide Fresh;
    DepEdgesUnion(view, covered, {t});
    DepEdgesUnion(view, covered + {t}, v1 - v0);
    SingleTemplate(view, t);
  }

  /** Expanding a further template keeps the scan complete. */
  lemma ScanExpand(view: View, roots: seq<Name>, t: Name, s0: Snap, s1: Snap)
    requires Scanned(view, roots, s0) && Good(view, t)
    requires Explores(view, Register(s0, t, Deps(view, t)), Deps(view, t), s1)
    ensures Scanned(view, roots + [t], s1)
  {
    hide ExploresGraph;
    hide ExploresErrors;
    hide DepEdges;
    hide GoodIn;
    hide Listed;
    hide Behind;
    var covered, found := AsSet(roots) + s0.pvisit, s1.pvisit - s0.pvisit;
    assert AsSet(roots + [t]) + s1.pvisit == covered + {t} + found;
    ScanGraph(view, covered, t, found, s0, s1);
    ScanVisits(view, covered, t, s0.pvisit, s1.pvisit);
    ExpandIsSound(view, roots, t, s0, s1);
  }

  /** Adds the graphs of all `tmpls`, skipping those already covered by another one. */
  method GraphPrepare(w: GraphWalk, tmpls: seq<Name>)
    requires w.Now() == Snap({}, None, {}, {}, false, [])
    modifies w
    ensures Scanned(w.view, tmpls, w.Now())
  {
    assert Scanned(w.view, [], w.Now());
    for i := 0 to |tmpls|
      invariant Scanned(w.view, tmpls[..i], w.Now())
    {
      assert tmpls[..i] + [tmpls[i]] == tmpls[..i + 1];
      ghost var s := w.Now();
      var p := Read(w.view, tmpls[i]);
      if tmpls[i] in w.pvisit || !p.Parsed? {
        ScanSkip(w.view, tmpls[..i], tmpls[i], s);
      } else {
        var _ := w.AddDepsGraph(tmpls[i], p.deps);
        ScanExpand(w.view, tmpls[..i], tmpls[i], s, w.Now());
      }
    }
    assert tmpls[..|tmpls|] == tmpls;
  }

  ghost predicate CycleBehind(view: View, roots: seq<Name>) {
    exists x :: Behind(view, roots, x) && Reach(AllEdges(view), x, x)
  }

  /** The scanned graph has a cycle exactly when one lies behind the given templates. */
  lemma ScanFindsCycles(view: View, roots: seq<Name>, s: Snap)
    requires Scanned(view, roots, s)
    ensures Cyclic(s.edges) <==> CycleBehind(view, roots)
  {
    var covered := AsSet(roots) + s.pvisit;
    if x :| Reach(s.edges, x, x) {
      var c := FirstStep(s.edges, x, x);
      assert Behind(view, roots, x);
      MonotoneReach(s.edges, AllEdges(view), x, x);
    }
    if x :| Behind(view, roots, x) && Reach(AllEdges(view), x, x) {
      forall a, b | (a, b) in AllEdges(view) && a in covered
        ensures (a, b) in s.edges && b in covered
      {
        assert b in Listed(view, covered);
      }
      if x !in roots {
        var r :| r in roots && Reach(AllEdges(view), r, x);
        TransferReach(AllEdges(view), s.edges, covered, r, x);
      }
      TransferReach(AllEdges(view), s.edges, covered, x, x);
    }
  }

  /**
   * Reports an error exactly when a dependency cycle can be reached from the given templates, whatever
   * their order and however often they repeat.
   */
  method CheckCycles(view: View, tmpls: seq<Name>) returns (cycleError: bool)
    ensures cycleError <==> CycleBehind(view, tmpls)
  {
    var w := new GraphWalk(view, None);
    GraphPrepare(w, tmpls);
    ScanFindsCycles(view, tmpls, w.Now());
    var ok := Prepare(w.nodes, w.edges);
    cycleError := !ok;
  }

  /** On the whole tree that is any cycle at all. */
  lemma WholeTree(view: View, tmpls: seq<Name>)
    requires view.Keys <= AsSet(tmpls)
    ensures CycleBehind(view, tmpls) <==> Cyclic(AllEdges(view))
  {
    if x :| Reach(AllEdges(view), x, x) {
      var c := FirstStep(AllEdges(view), x, x);
      assert x in AsSet(tmpls);
      assert Behind(view, tmpls, x);
    }
  }
}
