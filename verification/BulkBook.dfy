/**
 * The book of a bulk run as a function of what was requested: who is newly found behind each template, who gets
 * an implicit edge, and when the graph is cyclic.
 */
module BulkBook {
  import opened Graphs
  import opened Templates
  import opened DepGraph
  import opened BulkGraph
  import opened Sorting

  /** The closure of base-cbuild. */
  ghost function Base(dep: View): set<Name> {
    Newly(dep, {}, AsSet(Deps(dep, BASE_CBUILD)))
  }

  ghost function Handled(main: View, S: set<Name>): set<Name> {
    set x | x in S && Expandable(main, x)
  }

  /** The requested templates that come before `p` in sorted order. */
  ghost function Before(requested: set<Name>, p: Name): set<Name> {
    set r | r in requested && Less(r.text, p.text)
  }

  lemma PrefixIsBefore(sorted: seq<Name>, k: nat)
    requires Ascending(sorted) && k < |sorted|
    ensures AsSet(sorted[..k]) == Before(AsSet(sorted), sorted[k]) && sorted[k] !in sorted[..k]
  {
    LessIrreflexive(sorted[k].text);
    forall i | k <= i < |sorted| ensures !Less(sorted[i].text, sorted[k].text) {
      if i > k {
        LessAsymmetric(sorted[k].text, sorted[i].text);
      }
    }
  }

  /** What is found behind the requested templates `S`, besides the closure of base-cbuild. */
  ghost function NewBehind(dep: View, main: View, requested: set<Name>, S: set<Name>): set<Name> {
    Newly(dep, Base(dep) + requested, Listed(main, Handled(main, S)))
  }

  ghost function Seen(dep: View, main: View, requested: set<Name>, S: set<Name>): set<Name> {
    Base(dep) + requested + NewBehind(dep, main, requested, S)
  }

  /** What is newly found behind `p`, once its predecessors are through. */
  ghost function FoundAt(dep: View, main: View, requested: set<Name>, p: Name): set<Name> {
    Newly(dep, Seen(dep, main, requested, Before(requested, p)), AsSet(Deps(main, p)))
  }

  ghost function ExpandedAfter(dep: View, main: View, requested: set<Name>, S: set<Name>): set<Name> {
    Base(dep) + {BASE_CBUILD} + NewBehind(dep, main, requested, S)
  }

  /** `p` gets an implicit edge: nothing expanded before it lists it. */
  ghost predicate GetsEdge(dep: View, main: View, requested: set<Name>, p: Name) {
    var S := Before(requested, p);
    && Expandable(main, p) && p != BASE_CBUILD
    && p !in Mentioned(dep, main, ExpandedAfter(dep, main, requested, S), Handled(main, S))
  }

  /** The book once the requested templates `S` are through. */
  ghost function BookAfter(dep: View, main: View, requested: set<Name>, S: set<Name>): Book {
    Book(Base(dep), ExpandedAfter(dep, main, requested, S), Handled(main, S),
         set p | p in S && GetsEdge(dep, main, requested, p))
  }

  lemma HandledStep(main: View, S: set<Name>, p: Name)
    ensures Handled(main, S + {p}) == if Expandable(main, p) then Handled(main, S) + {p} else Handled(main, S)
    ensures Expandable(main, p) ==>
              Listed(main, Handled(main, S + {p})) == Listed(main, Handled(main, S)) + AsSet(Deps(main, p))
  {
    if Expandable(main, p) {
      DepEdgesUnion(main, Handled(main, S), {p});
      SingleTemplate(main, p);
      assert Handled(main, S + {p}) == Handled(main, S) + {p};
    }
  }

  /** What the next template adds to what is found. */
  lemma FoundStep(dep: View, main: View, requested: set<Name>, p: Name)
    requires Expandable(main, p)
    ensures var S := Before(requested, p);
            && NewBehind(dep, main, requested, S + {p})
               == NewBehind(dep, main, requested, S) + FoundAt(dep, main, requested, p)
            && FoundAt(dep, main, requested, p) !! Seen(dep, main, requested, S)
  {
    var S := Before(requested, p);
    HandledStep(main, S, p);
    NewlyStep(dep, Base(dep) + requested, Listed(main, Handled(main, S)), AsSet(Deps(main, p)));
    NewlyClosed(dep, Seen(dep, main, requested, S), AsSet(Deps(main, p)));
  }

  /** What `p` leads to through names that are neither requested nor behind base-cbuild. */
  ghost function OwnReach(dep: View, main: View, requested: set<Name>, p: Name): set<Name> {
    Newly(dep, Base(dep) + requested, AsSet(Deps(main, p)))
  }

  /** That much is newly found behind `p`, save what an expandable requested template before it leads to, too. */
  lemma FoundExactly(dep: View, main: View, requested: set<Name>, p: Name)
    ensures forall x :: x in FoundAt(dep, main, requested, p)
                    <==> x in OwnReach(dep, main, requested, p)
                         && !exists r :: r in Handled(main, Before(requested, p))
                                         && x in OwnReach(dep, main, requested, r)
  {
    var H := Handled(main, Before(requested, p));
    FoundFromSome(dep, Base(dep) + requested, main, H);
    NewlyAfter(dep, Base(dep) + requested, Listed(main, H), AsSet(Deps(main, p)));
  }

  /** A second search finds what it would find alone, save what the first one found. */
  lemma NewlyAfter(dep: View, V: set<Name>, R1: set<Name>, R2: set<Name>)
    ensures Newly(dep, V + Newly(dep, V, R1), R2) == Newly(dep, V, R2) - Newly(dep, V, R1)
  {
    var N1, W := Newly(dep, V, R1), V + Newly(dep, V, R1);
    NewlyStep(dep, V, R1, R2);
    NewlyClosed(dep, W, R2);
    NewlyExactly(dep, V, R1 + R2);
    NewlyExactly(dep, V, R2);
    forall x | x in Newly(dep, V, R2) ensures x in Newly(dep, V, R1 + R2) {
      assert NewFrom(dep, V, R1 + R2, x);
    }
    forall x | x in Newly(dep, W, R2) ensures x in Newly(dep, V, R2) {
      var r :| r in R2 && r !in W && (r == x || Reach(FreshEdges(dep, W), r, x));
      if r != x {
        MonotoneReach(FreshEdges(dep, W), FreshEdges(dep, V), r, x);
      }
      assert NewFrom(dep, V, R2, x);
    }
  }

  /** Templates that are not expanded change nothing. */
  lemma PassedOver(dep: View, main: View, requested: set<Name>, S: set<Name>, p: Name)
    requires !Expandable(main, p)
    ensures BookAfter(dep, main, requested, S + {p}) == BookAfter(dep, main, requested, S)
    ensures Seen(dep, main, requested, S + {p}) == Seen(dep, main, requested, S)
    ensures NewBehind(dep, main, requested, S + {p}) == NewBehind(dep, main, requested, S)
  {
    HandledStep(main, S, p);
  }

  lemma EdgesStep(dep: View, main: View, requested: set<Name>, S: set<Name>, p: Name)
    ensures (set x | x in S + {p} && GetsEdge(dep, main, requested, x))
         == (set x | x in S && GetsEdge(dep, main, requested, x))
            + if GetsEdge(dep, main, requested, p) then {p} else {}
  {
    hide GetsEdge;
  }

  /** Expanding the next template. */
  lemma BookAdvances(dep: View, main: View, requested: set<Name>, p: Name)
    requires Expandable(main, p)
    ensures var S := Before(requested, p);
            && Advance(dep, main, BookAfter(dep, main, requested, S), p, FoundAt(dep, main, requested, p))
               == BookAfter(dep, main, requested, S + {p})
            && Seen(dep, main, requested, S) + FoundAt(dep, main, requested, p) == Seen(dep, main, requested, S + {p})
  {
    hide NewBehind;
    hide Base;
    hide Before;
    hide FoundAt;
    hide Handled;
    hide Mentioned;
    var S := Before(requested, p);
    FoundStep(dep, main, requested, p);
    HandledStep(main, S, p);
    EdgesStep(dep, main, requested, S, p);
  }

  /** The state after expanding the next template. */
  lemma BookStep(dep: View, main: View, requested: set<Name>, p: Name, seen: set<Name>)
    requires Expandable(main, p) && Seen(dep, main, requested, Before(requested, p)) <= seen
    requires var s0 := Seen(dep, main, requested, Before(requested, p));
             forall x :: x in seen - s0 <==> Fresh(dep, s0, Deps(main, p), x)
    ensures var S := Before(requested, p);
            var s0 := Seen(dep, main, requested, S);
            && seen - s0 == FoundAt(dep, main, requested, p)
            && seen == Seen(dep, main, requested, S + {p})
            && Advance(dep, main, BookAfter(dep, main, requested, S), p, seen - s0)
               == BookAfter(dep, main, requested, S + {p})
  {
    hide Seen;
    hide Before;
    hide Newly;
    hide Advance;
    hide BookAfter;
    hide Fresh;
    var S := Before(requested, p);
    var s0 := Seen(dep, main, requested, S);
    NewlyIsFresh(dep, s0, Deps(main, p));
    assert seen - s0 == FoundAt(dep, main, requested, p);
    BookAdvances(dep, main, requested, p);
    assert seen == s0 + (seen - s0);
  }

  /** The book once base-cbuild is expanded. */
  lemma BookStarts(dep: View, main: View, requested: set<Name>, found: set<Name>)
    requires forall x :: x in found <==> Fresh(dep, {}, Deps(dep, BASE_CBUILD), x)
    ensures found == Base(dep)
    ensures StartBook(found) == BookAfter(dep, main, requested, {})
    ensures found + requested == Seen(dep, main, requested, {})
  {
    NewlyIsFresh(dep, {}, Deps(dep, BASE_CBUILD));
    assert Listed(main, Handled(main, {})) == {};
    assert NewBehind(dep, main, requested, {}) == {};
  }

  /**
   * All that is found behind the requested templates is found behind exactly one of them; together that is
   * what can be reached at all, in whatever order they come.
   */
  lemma {:induction false} FoundTogether(dep: View, main: View, requested: set<Name>, S: set<Name>)
    requires S <= requested && forall p, q :: p in S && q in requested && Less(q.text, p.text) ==> q in S
    ensures forall x :: x in NewBehind(dep, main, requested, S)
                    <==> exists p :: p in Handled(main, S) && x in FoundAt(dep, main, requested, p)
  {
    if S == {} {
      assert Listed(main, Handled(main, {})) == {};
      return;
    }
    var m := Greatest(S);
    var rest := S - {m};
    LessIrreflexive(m.text);
    forall q | q in rest ensures q in Before(requested, m) {
    }
    forall q | q in Before(requested, m) ensures q in rest {
    }
    assert rest == Before(requested, m) && S == rest + {m};
    forall p, q | p in rest && q in requested && Less(q.text, p.text) ensures q in rest {
      LessAsymmetric(p.text, m.text);
    }
    FoundTogether(dep, main, requested, rest);
    TogetherStep(dep, main, requested, m);
  }

  lemma TogetherStep(dep: View, main: View, requested: set<Name>, m: Name)
    requires var S := Before(requested, m);
             forall x :: x in NewBehind(dep, main, requested, S)
                     <==> exists p :: p in Handled(main, S) && x in FoundAt(dep, main, requested, p)
    ensures var S := Before(requested, m) + {m};
            forall x :: x in NewBehind(dep, main, requested, S)
                    <==> exists p :: p in Handled(main, S) && x in FoundAt(dep, main, requested, p)
  {
    hide NewBehind;
    hide FoundAt;
    hide Before;
    HandledStep(main, Before(requested, m), m);
    if Expandable(main, m) {
      FoundStep(dep, main, requested, m);
    } else {
      PassedOver(dep, main, requested, Before(requested, m), m);
    }
  }

  // ---- Who gets an implicit edge ----

  /** `r` lists `p`, directly or through templates that are neither requested nor behind base-cbuild. */
  ghost predicate LeadsTo(dep: View, main: View, requested: set<Name>, r: Name, p: Name) {
    var V := Base(dep) + requested;
    || p in Deps(main, r)
    || exists y :: y in Newly(dep, V, AsSet(Deps(main, r))) && p in Deps(dep, y)
  }

  /**
   * An expandable template other than base-cbuild gets an implicit edge exactly if it is not behind base-cbuild
   * and no expandable requested template that sorts before it leads to it.
   */
  lemma EdgeExactly(dep: View, main: View, requested: set<Name>, p: Name)
    requires Expandable(main, p) && p != BASE_CBUILD
    ensures GetsEdge(dep, main, requested, p)
       <==> p !in Base(dep)
            && !exists r :: r in Handled(main, Before(requested, p)) && LeadsTo(dep, main, requested, r, p)
  {
    var H := Handled(main, Before(requested, p));
    var N := NewBehind(dep, main, requested, Before(requested, p));
    BaseIsListed(dep);
    DepEdgesUnion(dep, Base(dep) + {BASE_CBUILD}, N);
    FoundFromSome(dep, Base(dep) + requested, main, H);
  }

  /** What is found behind several templates is found behind one of them. */
  lemma FoundFromSome(dep: View, V: set<Name>, main: View, H: set<Name>)
    ensures forall y :: y in Newly(dep, V, Listed(main, H))
              <==> exists r :: r in H && y in Newly(dep, V, AsSet(Deps(main, r)))
  {
    hide Newly;
    NewlyExactly(dep, V, Listed(main, H));
    forall r
      ensures forall y :: y in Newly(dep, V, AsSet(Deps(main, r))) <==> NewFrom(dep, V, AsSet(Deps(main, r)), y)
    {
      NewlyExactly(dep, V, AsSet(Deps(main, r)));
    }
    forall y | y in Newly(dep, V, Listed(main, H))
      ensures exists r :: r in H && y in Newly(dep, V, AsSet(Deps(main, r)))
    {
      var d :| d in Listed(main, H) && d !in V && (d == y || Reach(FreshEdges(dep, V), d, y));
      var r :| r in H && d in Deps(main, r);
      assert NewFrom(dep, V, AsSet(Deps(main, r)), y);
    }
  }

  /** The closure of base-cbuild is what base-cbuild and its closure list. */
  lemma BaseIsListed(dep: View)
    ensures Listed(dep, Base(dep) + {BASE_CBUILD}) == Base(dep)
  {
    var roots := Deps(dep, BASE_CBUILD);
    NewlyIsFresh(dep, {}, roots);
    NewlyClosed(dep, {}, AsSet(roots));
    DepEdgesUnion(dep, Base(dep), {BASE_CBUILD});
    SingleTemplate(dep, BASE_CBUILD);
    forall x | x in Base(dep) ensures x in Listed(dep, Base(dep) + {BASE_CBUILD}) {
      FreshIsListed(dep, {}, roots, Base(dep), x);
    }
  }

  // ---- Cycles ----

  /** All dependencies a run that requests these templates follows. */
  ghost function Chains(dep: View, main: View, requested: set<Name>): set<(Name, Name)> {
    RunEdges(dep, main, requested, Base(dep))
  }

  /** A template with an implicit edge can be reached from base-cbuild. */
  ghost predicate EdgeClosesCycle(dep: View, main: View, requested: set<Name>) {
    exists p :: p in requested && GetsEdge(dep, main, requested, p)
                && Reach(Chains(dep, main, requested), BASE_CBUILD, p)
  }

  ghost predicate CyclicRun(dep: View, main: View, requested: set<Name>) {
    CycleInReach(dep, main, requested, Base(dep)) || EdgeClosesCycle(dep, main, requested)
  }

  /** The dependencies of a run, and its implicit edges. */
  ghost function RunGraph(dep: View, main: View, requested: set<Name>): set<(Name, Name)> {
    Chains(dep, main, requested) + Implicit(set p | p in requested && GetsEdge(dep, main, requested, p))
  }

  /** Whatever an expanded template reaches that way it reaches in the graph. */
  lemma RunGraphInGraph(dep: View, main: View, requested: set<Name>, s: Snap, bk: Book, p: Name, q: Name)
    requires GraphOk(dep, main, requested, s, bk) && bk == BookAfter(dep, main, requested, requested)
    requires p in bk.handled && Reach(RunGraph(dep, main, requested), p, q)
    ensures Reach(s.edges, p, q)
  {
    hide GetsEdge;
    var S := s.pvisit + bk.handled + {BASE_CBUILD};
    forall a, b | (a, b) in RunGraph(dep, main, requested) && a in S ensures (a, b) in s.edges && b in S {
      if (a, b) in Chains(dep, main, requested) {
        RunStaysExplicit(dep, main, requested, s, bk, a, b);
      } else {
        assert a in bk.implicit && b == BASE_CBUILD;
      }
    }
    TransferReach(RunGraph(dep, main, requested), s.edges, S, p, q);
  }

  /** The exact verdict on the graph of a run, from the templates alone. */
  lemma CyclesExactly(dep: View, main: View, requested: set<Name>, s: Snap, bk: Book)
    requires GraphOk(dep, main, requested, s, bk) && bk == BookAfter(dep, main, requested, requested)
    ensures Cyclic(s.edges) <==> CyclicRun(dep, main, requested)
  {
    CycleVerdict(dep, main, requested, s, bk);
  }

  /**
   * Implicit edges add no cycle if requested templates in the closure of base-cbuild list nothing outside it;
   * this condition does not mention the order of the templates.
   */
  lemma KeptClosureIsHarmless(dep: View, main: View, requested: set<Name>)
    requires KeepsClosure(main, requested, Base(dep))
    ensures CyclicRun(dep, main, requested) <==> CycleInReach(dep, main, requested, Base(dep))
  {
    var W, S := Chains(dep, main, requested), Base(dep) + {BASE_CBUILD};
    BaseIsListed(dep);
    forall a, b | (a, b) in W && a in S ensures b in S {
      assert b in Deps(dep, a) ==> b in Listed(dep, S);
      NewlyClosed(dep, {}, AsSet(Deps(dep, BASE_CBUILD)));
    }
    if p :| p in requested && GetsEdge(dep, main, requested, p) && Reach(W, BASE_CBUILD, p) {
      ClosedReach(W, S, BASE_CBUILD, p);
      EdgeExactly(dep, main, requested, p);
    }
  }
}
