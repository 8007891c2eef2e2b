/**
 * The graph of a bulk run: explicit build dependencies plus implicit edges to base-cbuild, and what the
 * implicit ones can and cannot do.
 */
module BulkGraph {
  import opened Graphs
  import opened Templates
  import opened TopoSort
  import opened DepGraph

  /**
   * What the graph is made of: the closure of base-cbuild, all names expanded as dependencies, the requested
   * names expanded with their build options, and the names with an implicit edge.
   */
  datatype Book = Book(base: set<Name>, expanded: set<Name>, handled: set<Name>, implicit: set<Name>)

  ghost function Explicit(dep: View, main: View, bk: Book): set<(Name, Name)> {
    DepEdges(dep, bk.expanded) + DepEdges(main, bk.handled)
  }

  ghost function Implicit(s: set<Name>): set<(Name, Name)> {
    set p | p in s :: (p, BASE_CBUILD)
  }

  /** A template that is expanded when requested: readable with the build options and not broken. */
  predicate Expandable(main: View, n: Name) {
    Good(main, n) && !Read(main, n).broken
  }

  ghost predicate EdgesOk(dep: View, main: View, s: Snap, bk: Book) {
    && s.edges == Explicit(dep, main, bk) + Implicit(bk.implicit)
    && Within(s.nodes, s.edges)
    && bk.handled <= s.nodes
    && (forall n :: n in bk.handled ==> Expandable(main, n))
  }

  ghost predicate VisitsOk(dep: View, main: View, requested: set<Name>, visited: set<Name>, bk: Book) {
    && bk.handled <= requested <= visited
    && visited <= bk.expanded + requested
    && bk.expanded * requested <= bk.base + {BASE_CBUILD}
    && bk.expanded <= visited + {BASE_CBUILD}
    && Listed(dep, bk.expanded) <= visited
    && Listed(main, bk.handled) <= visited
  }

  ghost predicate BaseOk(dep: View, bk: Book) {
    && BASE_CBUILD in bk.expanded && bk.base <= bk.expanded
    && Listed(dep, bk.base + {BASE_CBUILD}) <= bk.base
    && (forall x :: x in bk.base <==> Fresh(dep, {}, Deps(dep, BASE_CBUILD), x))
  }

  /** Everything that an expanded template lists. */
  ghost function Mentioned(dep: View, main: View, expanded: set<Name>, handled: set<Name>): set<Name> {
    Listed(dep, expanded) + Listed(main, handled)
  }

  /** Who has an implicit edge: nothing around base-cbuild, everything else that no expanded template lists. */
  ghost predicate ImplicitOk(dep: View, main: View, cbvisit: Option<set<Name>>, bk: Book) {
    && cbvisit.Some? && bk.base <= cbvisit.value
    && cbvisit.value == Mentioned(dep, main, bk.expanded, bk.handled)
    && bk.implicit <= bk.handled <= bk.implicit + cbvisit.value + {BASE_CBUILD}
    && bk.implicit !! bk.base + {BASE_CBUILD}
  }

  /** Everything expanded is behind a requested template, or behind base-cbuild. */
  ghost predicate ReachedOk(dep: View, main: View, bk: Book) {
    forall x :: x in bk.expanded ==> FromStart(Explicit(dep, main, bk), bk.handled, x)
  }

  ghost predicate FromStart(X: set<(Name, Name)>, handled: set<Name>, x: Name) {
    x == BASE_CBUILD || exists r :: r in handled + {BASE_CBUILD} && Reach(X, r, x)
  }

  /** What holds of the graph between two steps of the parse phase. */
  ghost predicate GraphOk(dep: View, main: View, requested: set<Name>, s: Snap, bk: Book) {
    && EdgesOk(dep, main, s, bk)
    && VisitsOk(dep, main, requested, s.pvisit, bk)
    && BaseOk(dep, bk)
    && ImplicitOk(dep, main, s.cbvisit, bk)
    && ReachedOk(dep, main, bk)
  }

  /** Only the sets and the graph matter. */
  lemma GraphShape(dep: View, main: View, requested: set<Name>, s: Snap, t: Snap, bk: Book)
    requires GraphOk(dep, main, requested, s, bk)
    requires t.pvisit == s.pvisit && t.cbvisit == s.cbvisit && t.nodes == s.nodes && t.edges == s.edges
    ensures GraphOk(dep, main, requested, t, bk) && t.cbvisit.Some?
  {
  }

  ghost function StartBook(base: set<Name>): Book {
    Book(base, base + {BASE_CBUILD}, {}, {})
  }

  lemma StartEdges(dep: View, main: View, s0: Snap, found: set<Name>, s1: Snap)
    requires s0.nodes == {} && s0.edges == {}
    requires ExploresGraph(dep, Register(s0, BASE_CBUILD, Deps(dep, BASE_CBUILD)), Deps(dep, BASE_CBUILD), found, s1)
    ensures EdgesOk(dep, main, s1, StartBook(found))
  {
    DepEdgesUnion(dep, found, {BASE_CBUILD});
    SingleTemplate(dep, BASE_CBUILD);
    var own := EdgesOf(BASE_CBUILD, Deps(dep, BASE_CBUILD));
    StartRegroup(own, DepEdges(dep, found), DepEdges(main, {}), Implicit({}));
    NodesWithin(dep, {}, {}, BASE_CBUILD, Deps(dep, BASE_CBUILD), found);
  }

  lemma StartRegroup(own: set<(Name, Name)>, behind: set<(Name, Name)>, m: set<(Name, Name)>, i: set<(Name, Name)>)
    requires m == {} && i == {}
    ensures {} + own + behind == (behind + own) + m + i
  {
  }

  lemma StartVisits(dep: View, main: View, requested: set<Name>, found: set<Name>)
    requires ExploresNames(dep, {}, Deps(dep, BASE_CBUILD), found)
    ensures VisitsOk(dep, main, requested, found + requested, StartBook(found))
    ensures Listed(dep, found + {BASE_CBUILD}) <= found
  {
    assert found - {} == found;
    DepEdgesUnion(dep, found, {BASE_CBUILD});
    SingleTemplate(dep, BASE_CBUILD);
  }

  /** The graph once base-cbuild is expanded, and the requested names are marked as visited. */
  lemma GraphStart(dep: View, main: View, requested: set<Name>, s0: Snap, s1: Snap)
    requires s0.pvisit == {} && s0.nodes == {} && s0.edges == {} && s0.cbvisit == Some({})
    requires Explores(dep, Register(s0, BASE_CBUILD, Deps(dep, BASE_CBUILD)), Deps(dep, BASE_CBUILD), s1)
    ensures GraphOk(dep, main, requested, s1.(pvisit := s1.pvisit + requested), StartBook(s1.pvisit))
  {
    var found := s1.pvisit;
    assert found - {} == found;
    StartEdges(dep, main, s0, found, s1);
    StartVisits(dep, main, requested, found);
    StartBase(dep, main, Register(s0, BASE_CBUILD, Deps(dep, BASE_CBUILD)), s1);
    StartReached(dep, main, found);
  }

  lemma StartReached(dep: View, main: View, found: set<Name>)
    requires ExploresNames(dep, {}, Deps(dep, BASE_CBUILD), found)
    ensures ReachedOk(dep, main, StartBook(found))
  {
    var X, S := Explicit(dep, main, StartBook(found)), found + {BASE_CBUILD};
    StartVisits(dep, main, {}, found);
    forall a, b | (a, b) in AllEdges(dep) && a in S ensures (a, b) in X && b in S {
      assert b in Listed(dep, S);
    }
    forall x | x in S ensures FromStart(X, {}, x) {
      if x != BASE_CBUILD {
        assert x in found - {};
        FreshIsBehind(dep, {}, BASE_CBUILD, x);
        TransferReach(AllEdges(dep), X, S, BASE_CBUILD, x);
      }
    }
  }

  lemma StartBase(dep: View, main: View, s: Snap, s1: Snap)
    requires s.pvisit == {} && s.cbvisit == Some({})
    requires Explores(dep, s, Deps(dep, BASE_CBUILD), s1)
    ensures BaseOk(dep, StartBook(s1.pvisit)) && ImplicitOk(dep, main, s1.cbvisit, StartBook(s1.pvisit))
  {
    var found := s1.pvisit;
    assert found - {} == found;
    ExploresExactly(dep, s, Deps(dep, BASE_CBUILD), s1);
    StartVisits(dep, main, {}, found);
    DepEdgesUnion(dep, found, {BASE_CBUILD});
    SingleTemplate(dep, BASE_CBUILD);
    assert Listed(main, {}) == {};
    forall x | x in found ensures x in s1.cbvisit.value {
      FreshIsListed(dep, {}, Deps(dep, BASE_CBUILD), found, x);
    }
  }

  /** Whatever is found was listed by the start or by something found. */
  lemma FreshIsListed(view: View, V: set<Name>, roots: seq<Name>, found: set<Name>, x: Name)
    requires Fresh(view, V, roots, x)
    requires forall y :: Fresh(view, V, roots, y) ==> y in found
    ensures x in AsSet(roots) + Listed(view, found)
  {
    var E := FreshEdges(view, V);
    var r :| r in roots && r !in V && (r == x || Reach(E, r, x));
    if r != x {
      assert Fresh(view, V, roots, r);
      var S := set y | y in Listed(view, found) && Fresh(view, V, roots, y);
      forall a, b | (a, b) in E && (a == r || a in S) ensures b in S {
        var q :| q in roots && q !in V && (q == a || Reach(E, q, a));
        ReachEdge(E, a, b);
        if q != a {
          ReachTrans(E, q, a, b);
        }
        assert Fresh(view, V, roots, b);
        assert a in found;
      }
      ClosedReach(E, S, r, x);
    }
  }

  /** The edges of an expansion stay within the nodes it registers. */
  lemma NodesWithin(dep: View, nodes: set<Name>, edges: set<(Name, Name)>, n: Name, deps: seq<Name>, found: set<Name>)
    requires Within(nodes, edges)
    ensures Within(nodes + {n} + AsSet(deps) + GoodIn(dep, found) + Listed(dep, found),
                   edges + EdgesOf(n, deps) + DepEdges(dep, found))
  {
    var N := nodes + {n} + AsSet(deps) + GoodIn(dep, found) + Listed(dep, found);
    forall a, b | (a, b) in DepEdges(dep, found) ensures a in N && b in N {
      assert b in Listed(dep, found);
      assert a in GoodIn(dep, found);
    }
    forall a, b | (a, b) in EdgesOf(n, deps) ensures a in N && b in N {
    }
  }

  /** The snapshot after the implicit edge of `n` was added, if it gets one. */
  ghost function WithImplicit(s: Snap, n: Name): Snap {
    if GetsImplicit(s, n) then Register(s, n, [BASE_CBUILD]) else s
  }

  predicate GetsImplicit(s: Snap, n: Name) {
    (s.cbvisit.Some? ==> n !in s.cbvisit.value) && n != BASE_CBUILD
  }

  ghost function NextBook(s0: Snap, bk: Book, n: Name, s1: Snap): Book {
    bk.(expanded := bk.expanded + (s1.pvisit - s0.pvisit), handled := bk.handled + {n},
        implicit := bk.implicit + if GetsImplicit(s0, n) then {n} else {})
  }

  /** The book once the requested template `n` is expanded, newly finding `found`. */
  ghost function Advance(dep: View, main: View, bk: Book, n: Name, found: set<Name>): Book {
    var edge := n != BASE_CBUILD && n !in Mentioned(dep, main, bk.expanded, bk.handled);
    bk.(expanded := bk.expanded + found, handled := bk.handled + {n},
        implicit := bk.implicit + if edge then {n} else {})
  }

  lemma NextBookAdvances(dep: View, main: View, requested: set<Name>, s0: Snap, bk: Book, n: Name, s1: Snap)
    requires GraphOk(dep, main, requested, s0, bk)
    ensures NextBook(s0, bk, n, s1) == Advance(dep, main, bk, n, s1.pvisit - s0.pvisit)
  {
  }

  lemma StepEdges(dep: View, main: View, s0: Snap, bk: Book, n: Name, s1: Snap)
    requires EdgesOk(dep, main, s0, bk) && Expandable(main, n)
    requires ExploresGraph(dep, Register(WithImplicit(s0, n), n, Deps(main, n)), Deps(main, n),
                           s1.pvisit - s0.pvisit, s1)
    ensures EdgesOk(dep, main, s1, NextBook(s0, bk, n, s1))
  {
    var found := s1.pvisit - s0.pvisit;
    var i := if GetsImplicit(s0, n) then {n} else {};
    ImplicitStep(s0, bk.implicit, n);
    SingleTemplate(main, n);
    DepEdgesUnion(dep, bk.expanded, found);
    DepEdgesUnion(main, bk.handled, {n});
    RegroupEdges(DepEdges(dep, bk.expanded), DepEdges(main, bk.handled), Implicit(bk.implicit),
                 Implicit(i), EdgesOf(n, Deps(main, n)), DepEdges(dep, found));
    var si := WithImplicit(s0, n);
    NodesWithin(dep, si.nodes, si.edges, n, Deps(main, n), found);
  }

  lemma ImplicitStep(s: Snap, implicit: set<Name>, n: Name)
    requires Within(s.nodes, s.edges)
    ensures Within(WithImplicit(s, n).nodes, WithImplicit(s, n).edges)
    ensures var i := if GetsImplicit(s, n) then {n} else {};
            && WithImplicit(s, n).edges == s.edges + Implicit(i)
            && Implicit(implicit + i) == Implicit(implicit) + Implicit(i)
  {
    assert BASE_CBUILD in AsSet([BASE_CBUILD]);
  }

  lemma RegroupEdges<T>(e: set<T>, h: set<T>, m: set<T>, i: set<T>, n: set<T>, f: set<T>)
    ensures e + h + m + i + n + f == (e + f) + (h + n) + (m + i)
  {
  }

  lemma StepVisits(dep: View, main: View, requested: set<Name>, s0: Snap, bk: Book, n: Name, s1: Snap)
    requires VisitsOk(dep, main, requested, s0.pvisit, bk) && n in requested
    requires ExploresNames(dep, s0.pvisit, Deps(main, n), s1.pvisit)
    ensures VisitsOk(dep, main, requested, s1.pvisit, NextBook(s0, bk, n, s1))
  {
    SingleTemplate(main, n);
    DepEdgesUnion(dep, bk.expanded, s1.pvisit - s0.pvisit);
    DepEdgesUnion(main, bk.handled, {n});
  }

  lemma StepImplicit(dep: View, main: View, s0: Snap, bk: Book, n: Name, s1: Snap)
    requires ImplicitOk(dep, main, s0.cbvisit, bk)
    requires Noted(s0.cbvisit, AsSet(Deps(main, n)) + Listed(dep, s1.pvisit - s0.pvisit), s1.cbvisit)
    ensures ImplicitOk(dep, main, s1.cbvisit, NextBook(s0, bk, n, s1))
  {
    SingleTemplate(main, n);
    DepEdgesUnion(dep, bk.expanded, s1.pvisit - s0.pvisit);
    DepEdgesUnion(main, bk.handled, {n});
  }

  lemma ExplicitGrows(dep: View, main: View, s0: Snap, bk: Book, n: Name, s1: Snap)
    ensures Explicit(dep, main, bk) <= Explicit(dep, main, NextBook(s0, bk, n, s1))
  {
    DepEdgesUnion(dep, bk.expanded, s1.pvisit - s0.pvisit);
    DepEdgesUnion(main, bk.handled, {n});
  }

  lemma StepReached(dep: View, main: View, s0: Snap, bk: Book, n: Name, s1: Snap)
    requires ReachedOk(dep, main, bk) && Good(main, n)
    requires ExploresNames(dep, s0.pvisit, Deps(main, n), s1.pvisit)
    ensures ReachedOk(dep, main, NextBook(s0, bk, n, s1))
  {
    var next, found := NextBook(s0, bk, n, s1), s1.pvisit - s0.pvisit;
    var X := Explicit(dep, main, next);
    ExplicitGrows(dep, main, s0, bk, n, s1);
    forall x | x in next.expanded ensures FromStart(X, next.handled, x) {
      if x in bk.expanded {
        if x != BASE_CBUILD {
          var r :| r in bk.handled + {BASE_CBUILD} && Reach(Explicit(dep, main, bk), r, x);
          MonotoneReach(Explicit(dep, main, bk), X, r, x);
        }
      } else {
        FoundIsReached(dep, s0.pvisit, Deps(main, n), s1.pvisit, n, X, x);
      }
    }
  }

  lemma FoundIsReached(dep: View, v0: set<Name>, roots: seq<Name>, v1: set<Name>, n: Name, X: set<(Name, Name)>,
                       x: Name)
    requires ExploresNames(dep, v0, roots, v1) && x in v1 - v0
    requires DepEdges(dep, v1 - v0) <= X && forall d :: d in roots ==> (n, d) in X
    ensures Reach(X, n, x)
  {
    var E, found := FreshEdges(dep, v0), v1 - v0;
    var r :| r in roots && r !in v0 && (r == x || Reach(E, r, x));
    assert r in AsSet(roots);
    ReachEdge(X, n, r);
    if r != x {
      forall a, b | (a, b) in E && a in found ensures (a, b) in X && b in found {
        assert b in Listed(dep, found);
        assert (a, b) in DepEdges(dep, found);
      }
      TransferReach(E, X, found, r, x);
      ReachTrans(X, n, r, x);
    }
  }

  /** Expanding one requested template. */
  lemma GraphStep(dep: View, main: View, requested: set<Name>, s0: Snap, bk: Book, n: Name, s1: Snap)
    requires GraphOk(dep, main, requested, s0, bk) && n in requested && Expandable(main, n)
    requires Explores(dep, Register(WithImplicit(s0, n), n, Deps(main, n)), Deps(main, n), s1)
    ensures GraphOk(dep, main, requested, s1, NextBook(s0, bk, n, s1))
  {
    StepEdges(dep, main, s0, bk, n, s1);
    StepVisits(dep, main, requested, s0, bk, n, s1);
    StepImplicit(dep, main, s0, bk, n, s1);
    StepReached(dep, main, s0, bk, n, s1);
  }

  // ---- Implicit edges and cycles ----

  lemma {:induction false} PathInside<T(!new)>(X: set<(T, T)>, E: set<(T, T)>, S: set<T>, a: T, mid: seq<T>, b: T)
    requires Closed(E, S) && forall x, y :: (x, y) in E && x !in S ==> (x, y) in X || y in S
    requires b !in S && Path(E, a, mid, b) && a !in S
    ensures Path(X, a, mid, b)
    decreases |mid|
  {
    if |mid| > 0 {
      if mid[0] in S {
        ClosedPath(E, S, mid[0], mid[1..], b);
      }
      PathInside(X, E, S, mid[0], mid[1..], b);
    }
  }

  /** Edges into a closed region that none of them leaves again close no new cycle. */
  lemma HarmlessEdges<T(!new)>(X: set<(T, T)>, E: set<(T, T)>, S: set<T>)
    requires X <= E && Closed(E, S)
    requires forall x, y :: (x, y) in E && (x, y) !in X ==> x !in S && y in S
    ensures Cyclic(E) <==> Cyclic(X)
  {
    if x :| Reach(X, x, x) {
      MonotoneReach(X, E, x, x);
    }
    if x :| Reach(E, x, x) {
      if x in S {
        TransferReach(E, X, S, x, x);
      } else {
        var mid :| Path(E, x, mid, x);
        PathInside(X, E, S, x, mid, x);
        assert Reach(X, x, x);
      }
    }
  }

  /** Everything behind base-cbuild along explicit edges, and base-cbuild itself. */
  ghost function BaseRegion(X: set<(Name, Name)>): set<Name> {
    {BASE_CBUILD} + set e | e in X && Reach(X, BASE_CBUILD, e.1) :: e.1
  }

  lemma BaseRegionClosed(X: set<(Name, Name)>)
    ensures Closed(X, BaseRegion(X))
    ensures forall x :: x in BaseRegion(X) <==> x == BASE_CBUILD || Reach(X, BASE_CBUILD, x)
  {
    forall a, b | (a, b) in X && a in BaseRegion(X) ensures b in BaseRegion(X) {
      ReachEdge(X, a, b);
      if a != BASE_CBUILD {
        ReachTrans(X, BASE_CBUILD, a, b);
      }
      assert (a, b).1 == b;
    }
    forall x | Reach(X, BASE_CBUILD, x) ensures x in BaseRegion(X) {
      forall c | (BASE_CBUILD, c) in X ensures c in BaseRegion(X) {
        assert BASE_CBUILD in BaseRegion(X);
      }
      ClosedReach(X, BaseRegion(X), BASE_CBUILD, x);
    }
  }

  /**
   * For every graph a bulk run builds: it is cyclic exactly if the explicit edges are, or base-cbuild
   * depends, along explicit edges, on a template that was given an implicit edge.
   */
  lemma ImplicitEdgesExactly(dep: View, main: View, requested: set<Name>, s: Snap, bk: Book)
    requires GraphOk(dep, main, requested, s, bk)
    ensures Cyclic(s.edges) <==>
            (Cyclic(Explicit(dep, main, bk))
             || exists p :: p in bk.implicit && Reach(Explicit(dep, main, bk), BASE_CBUILD, p))
  {
    var X := Explicit(dep, main, bk);
    var S := BaseRegion(X);
    BaseRegionClosed(X);
    if p :| p in bk.implicit && Reach(X, BASE_CBUILD, p) {
      MonotoneReach(X, s.edges, BASE_CBUILD, p);
      ReachEdge(s.edges, p, BASE_CBUILD);
      ReachTrans(s.edges, p, BASE_CBUILD, p);
    } else {
      assert bk.implicit !! S;
      HarmlessEdges(X, s.edges, S);
    }
  }

  /**
   * The caller's condition: a requested template in the closure of base-cbuild (or base-cbuild itself) lists,
   * with the build options, no dependency from outside that closure.
   */
  ghost predicate KeepsClosure(main: View, requested: set<Name>, base: set<Name>) {
    forall x, d :: x in requested && x in base + {BASE_CBUILD} && Expandable(main, x) && d in Deps(main, x)
      ==> d in base + {BASE_CBUILD}
  }

  // ---- Chains of templates ----

  /** The dependencies a bulk run follows: requested templates with build options, the others as dependencies. */
  ghost function ChainEdges(dep: View, main: View, requested: set<Name>): set<(Name, Name)> {
    DepEdges(dep, dep.Keys - requested) + DepEdges(main, set x | x in requested && Expandable(main, x))
  }

  /** All dependencies a bulk run reads: those of chains, and those of the closure of base-cbuild. */
  ghost function RunEdges(dep: View, main: View, requested: set<Name>, base: set<Name>): set<(Name, Name)> {
    DepEdges(dep, base + {BASE_CBUILD}) + ChainEdges(dep, main, requested)
  }

  /** A cycle of dependencies lies behind a requested template or behind base-cbuild. */
  ghost predicate CycleInReach(dep: View, main: View, requested: set<Name>, base: set<Name>) {
    var W := RunEdges(dep, main, requested, base);
    exists r, x :: r in Starts(main, requested) && (x == r || Reach(W, r, x)) && Reach(W, x, x)
  }

  ghost function Starts(main: View, requested: set<Name>): set<Name> {
    {BASE_CBUILD} + set r | r in requested && Expandable(main, r)
  }

  lemma ExplicitWithin(dep: View, main: View, requested: set<Name>, s: Snap, bk: Book)
    requires GraphOk(dep, main, requested, s, bk)
    ensures Explicit(dep, main, bk) <= RunEdges(dep, main, requested, bk.base)
  {
    forall a, b | (a, b) in Explicit(dep, main, bk) ensures (a, b) in RunEdges(dep, main, requested, bk.base) {
      if (a, b) in DepEdges(dep, bk.expanded) {
        if a in bk.base + {BASE_CBUILD} {
          assert (a, b) in DepEdges(dep, bk.base + {BASE_CBUILD});
        } else {
          assert a !in requested;
          assert (a, b) in DepEdges(dep, dep.Keys - requested);
        }
      }
    }
  }

  lemma RunStaysExplicit(dep: View, main: View, requested: set<Name>, s: Snap, bk: Book, a: Name, b: Name)
    requires GraphOk(dep, main, requested, s, bk)
    requires forall x :: x in requested && Expandable(main, x) ==> x in bk.handled
    requires (a, b) in RunEdges(dep, main, requested, bk.base) && a in s.pvisit + bk.handled + {BASE_CBUILD}
    ensures (a, b) in Explicit(dep, main, bk) && b in s.pvisit
  {
    if a in bk.expanded && b in Deps(dep, a) {
      assert b in Listed(dep, bk.expanded);
      assert (a, b) in DepEdges(dep, bk.expanded);
    } else {
      assert a in bk.handled && b in Deps(main, a);
      assert b in Listed(main, bk.handled);
      assert (a, b) in DepEdges(main, bk.handled);
    }
  }

  /** Once every requested template is handled, any chain from an expanded one is in the graph. */
  lemma ChainInGraph(dep: View, main: View, requested: set<Name>, s: Snap, bk: Book, p: Name, q: Name)
    requires GraphOk(dep, main, requested, s, bk)
    requires forall x :: x in requested && Expandable(main, x) ==> x in bk.handled
    requires p in s.pvisit + bk.handled + {BASE_CBUILD} && Reach(RunEdges(dep, main, requested, bk.base), p, q)
    ensures q in s.pvisit && Reach(Explicit(dep, main, bk), p, q) && Reach(s.edges, p, q)
  {
    var W, X := RunEdges(dep, main, requested, bk.base), Explicit(dep, main, bk);
    var S := s.pvisit + bk.handled + {BASE_CBUILD};
    forall a, b | (a, b) in W && a in S ensures (a, b) in X && b in s.pvisit {
      RunStaysExplicit(dep, main, requested, s, bk, a, b);
    }
    TransferReach(W, X, S, p, q);
    MonotoneReach(X, s.edges, p, q);
    ClosedReach(W, s.pvisit, p, q);
  }

  /** The explicit edges are cyclic exactly if a cycle of dependencies is in reach. */
  lemma ExplicitCycles(dep: View, main: View, requested: set<Name>, s: Snap, bk: Book)
    requires GraphOk(dep, main, requested, s, bk)
    requires forall x :: x in requested && Expandable(main, x) ==> x in bk.handled
    ensures Cyclic(Explicit(dep, main, bk)) <==> CycleInReach(dep, main, requested, bk.base)
  {
    var X, W := Explicit(dep, main, bk), RunEdges(dep, main, requested, bk.base);
    ExplicitWithin(dep, main, requested, s, bk);
    if x :| Reach(X, x, x) {
      var c := FirstStep(X, x, x);
      MonotoneReach(X, W, x, x);
      CycleHasStart(dep, main, requested, bk, x, W);
    }
    if r, x :| r in Starts(main, requested) && (x == r || Reach(W, r, x)) && Reach(W, x, x) {
      if x != r {
        ChainInGraph(dep, main, requested, s, bk, r, x);
      }
      ChainInGraph(dep, main, requested, s, bk, x, x);
    }
  }

  /**
   * Once every requested template is handled, the graph is cyclic exactly if a cycle of dependencies is in
   * reach, or a template with an implicit edge can be reached from base-cbuild.
   */
  lemma CycleVerdict(dep: View, main: View, requested: set<Name>, s: Snap, bk: Book)
    requires GraphOk(dep, main, requested, s, bk)
    requires forall x :: x in requested && Expandable(main, x) ==> x in bk.handled
    ensures Cyclic(s.edges) <==>
            (CycleInReach(dep, main, requested, bk.base)
             || exists p :: p in bk.implicit && Reach(RunEdges(dep, main, requested, bk.base), BASE_CBUILD, p))
  {
    var X, W := Explicit(dep, main, bk), RunEdges(dep, main, requested, bk.base);
    ImplicitEdgesExactly(dep, main, requested, s, bk);
    ExplicitCycles(dep, main, requested, s, bk);
    ExplicitWithin(dep, main, requested, s, bk);
    if p :| p in bk.implicit && Reach(X, BASE_CBUILD, p) {
      MonotoneReach(X, W, BASE_CBUILD, p);
    }
    if p :| p in bk.implicit && Reach(W, BASE_CBUILD, p) {
      ChainInGraph(dep, main, requested, s, bk, BASE_CBUILD, p);
    }
  }

  lemma CycleHasStart(dep: View, main: View, requested: set<Name>, bk: Book, x: Name, W: set<(Name, Name)>)
    requires ReachedOk(dep, main, bk) && Explicit(dep, main, bk) <= W && x in bk.expanded + bk.handled
    requires bk.handled <= requested && forall n :: n in bk.handled ==> Expandable(main, n)
    ensures exists r :: r in Starts(main, requested) && (x == r || Reach(W, r, x))
  {
    if x in bk.handled || x == BASE_CBUILD {
      assert x in Starts(main, requested);
    } else {
      var r :| r in bk.handled + {BASE_CBUILD} && Reach(Explicit(dep, main, bk), r, x);
      MonotoneReach(Explicit(dep, main, bk), W, r, x);
      assert r in Starts(main, requested);
    }
  }
}
